/** The consumer of debug-log bundles, `bin/fetch-log.ts`: it reads a log ID,
    downloads the bundle, sorts its entries into per-file groups, checks that
    every group is complete and writes each file out, decrypting it when it
    came with an IV. The download, the ZIP reader, the private key and the
    ciphers are parameters. */
module FetchLog {
  import opened Base
  import opened Strings
  import opened Records
  import LogId

  /** What `oops` reports before `process.exit(1)`, what the final `catch`
      reports for an exception, or a normal end. */
  datatype Exit = Done | Fatal(message: string) | Thrown(message: string)

  /** The settings lines 44-65 derive from the command line. */
  datatype Options = Options(encrypted: bool, zip: string, url: string, logs: string)

  /** Lines 44-59: `args` are the positional arguments, `privatePath` the
      `--private` option and `fileExists` is `fs.existsSync`. */
  function Setup(args: seq<string>, privatePath: string, fileExists: string -> bool): Result<Options, string> {
    if |args| == 0 then Err("No log ID")
    else match LogId.Parse(args[0])
      case None => Err(args[0] + " is not a valid log ID")
      case Some(p) =>
        if p.host != "0x0" then Err("Unexpected debug log host " + p.host)
        else
          var encrypted := LogId.Encrypted(p.tags);
          if encrypted && privatePath == "" then Err("No private key provided")
          else if encrypted && !fileExists(privatePath) then Err("Private key " + privatePath + " does not exist")
          else if encrypted && !fileExists("package.json") then Err("package.json does not exist in the current directory")
          else Ok(Options(encrypted, "logs/" + p.key + ".zip", "https://0x0.st/" + p.remote + ".zip", "logs/" + p.key))
  }

  /** The suffix test of `/(?<filename>.+)\.(?<type>key|enc|iv)$/i`: the
      length of the type word the name ends with after a `.`, or 0. */
  function SuffixLength(name: string): (n: nat)
    ensures n == 0 || n == 2 || n == 3
    ensures n > 0 ==> n + 1 <= |name| && name[|name| - n - 1] == '.'
  {
    if |name| >= 4 && name[|name| - 4] == '.' && (Lower(name[|name| - 3..]) == "key" || Lower(name[|name| - 3..]) == "enc") then 3
    else if |name| >= 3 && name[|name| - 3] == '.' && Lower(name[|name| - 2..]) == "iv" then 2
    else 0
  }

  /** A name that ends in `.key`, `.enc` or `.iv`, in any case. */
  predicate TypedName(name: string) {
    SuffixLength(name) > 0
  }

  predicate IsTypeWord(t: string) {
    Lower(t) == "key" || Lower(t) == "enc" || Lower(t) == "iv"
  }

  /** Where the line holding position `to` starts: just after the last line
      terminator before `to`, or 0. */
  function LineStart(s: string, to: nat): (r: nat)
    requires to <= |s|
    ensures r <= to
    ensures forall j :: r <= j < to ==> !IsLineTerminator(s[j])
    ensures r > 0 ==> IsLineTerminator(s[r - 1])
  {
    if to == 0 then 0
    else if IsLineTerminator(s[to - 1]) then to
    else LineStart(s, to - 1)
  }

  /** The `filename` and `type` groups of the entry regex (bin/fetch-log.ts:98).
      `$` anchors at the end of the name, so the suffix is the one the name
      ends with; `.+` cannot cross a line terminator, so the leftmost match
      starts at the line that holds the `.`. */
  function EntryMatch(name: string): (r: Option<(string, string)>)
    ensures r.Some? ==> |r.value.0| > 0 && NoLineTerminator(r.value.0) && IsTypeWord(r.value.1)
    ensures r.Some? ==> EndsWith(name, r.value.0 + "." + r.value.1)
    ensures !TypedName(name) ==> r.None?
  {
    var n := SuffixLength(name);
    if n == 0 then None
    else
      var dot := |name| - n - 1;
      var start := LineStart(name, dot);
      if start == dot then None
      else
        var f, t := name[start..dot], name[dot + 1..];
        SuffixWord(name);
        SplitAtDot(name, start, dot);
        Some((f, t))
  }

  /** What a typed name ends with after its `.` is a type word. */
  lemma SuffixWord(name: string)
    requires SuffixLength(name) > 0
    ensures IsTypeWord(name[|name| - SuffixLength(name)..])
  {
  }

  /** The part of one line before a `.` and what follows the `.` make up
      the end of the name. */
  lemma SplitAtDot(name: string, start: nat, dot: nat)
    requires start < dot < |name| && name[dot] == '.'
    requires forall j :: start <= j < dot ==> !IsLineTerminator(name[j])
    ensures NoLineTerminator(name[start..dot])
    ensures EndsWith(name, name[start..dot] + "." + name[dot + 1..])
  {
    var f, t := name[start..dot], name[dot + 1..];
    assert name[start..] == f + "." + t;
    forall j | 0 <= j < |f| ensures !IsLineTerminator(f[j]) {
      assert f[j] == name[start + j];
    }
  }

  lemma {:induction false} LineStartNoTerminator(s: string, to: nat)
    requires to <= |s|
    requires forall j :: 0 <= j < to ==> !IsLineTerminator(s[j])
    ensures LineStart(s, to) == 0
  {
    if to > 0 {
      LineStartNoTerminator(s, to - 1);
    }
  }

  /** A one-line filename followed by `.` and a type word matches with
      exactly those groups. */
  lemma EntryMatchOf(f: string, t: string)
    requires |f| > 0 && NoLineTerminator(f) && IsTypeWord(t)
    ensures EntryMatch(f + "." + t) == Some((f, t))
  {
    var name := f + "." + t;
    SuffixLengthOf(f, t);
    forall j | 0 <= j < |f| ensures !IsLineTerminator(name[j]) {
      assert name[j] == f[j];
    }
    LineStartNoTerminator(name, |f|);
    assert name[..|f|] == f && name[|f| + 1..] == t;
  }

  /** The suffix test reads the type word back. */
  lemma SuffixLengthOf(f: string, t: string)
    requires IsTypeWord(t)
    ensures SuffixLength(f + "." + t) == |t|
  {
    var name := f + "." + t;
    assert |Lower(t)| == |t|;
    assert name[|name| - |t|..] == t;
    assert name[|name| - |t| - 1] == '.';
    if |t| == 2 {
      assert name[|name| - 3..] == "." + t;
      assert Lower(name[|name| - 3..])[0] == '.';
    }
  }

  /** Putting an alphanumeric key and `/` in front does not change whether a
      name is typed. */
  lemma TypedUnderKey(key: string, p: string)
    requires |key| > 0 && AllAlnum(key)
    ensures TypedName(key + "/" + p) == TypedName(p)
  {
    var name := key + "/" + p;
    assert name[|name| - |p|..] == p;
    if |p| >= 4 {
      assert name[|name| - 4] == p[|p| - 4];
      assert name[|name| - 3..] == p[|p| - 3..];
      assert name[|name| - 2..] == p[|p| - 2..];
      assert name[|name| - 3] == p[|p| - 3];
    } else if |p| == 3 {
      assert name[|name| - 4] == '/';
      assert name[|name| - 3] == p[0];
      assert name[|name| - 2..] == p[1..];
    } else {
      assert |name| >= 3 ==> name[|name| - 3] == '/' || IsAsciiAlnum(name[|name| - 3]);
      assert |name| >= 4 ==> name[|name| - 4] == '/' || IsAsciiAlnum(name[|name| - 4]);
    }
  }

  /** How line 100 reads the suffix. As written it reads `groups.ext`, a group
      the regex does not have, so the type is always empty; the regex names
      the group `type`, which is what the line evidently means. */
  datatype Reading = AsWritten | Intended

  /** `type` of bin/fetch-log.ts:100, lower-cased. */
  function TypeOf(reading: Reading, name: string): (t: string)
    ensures t == "" || t == "key" || t == "enc" || t == "iv"
    ensures reading == AsWritten ==> t == ""
  {
    match reading
    case AsWritten => ""
    case Intended =>
      match EntryMatch(name)
      case None => ""
      case Some((_, t)) => Lower(t)
  }

  /** `filename` of bin/fetch-log.ts:99: the `filename` group, or the whole
      name when the regex does not match. */
  function FilenameOf(name: string): string {
    match EntryMatch(name)
    case None => name
    case Some((f, _)) => f
  }

  /** The key of the group an entry joins (bin/fetch-log.ts:112). */
  function GroupKey(name: string): string {
    Lower(FilenameOf(name))
  }

  /** An entry of `zipfile.entries()`. */
  datatype ZipItem = ZipItem(isDirectory: bool, data: seq<byte>)

  /** `await zipfile.entries()`: an object from entry name to entry. */
  type Archive = Record<ZipItem>

  /** A value of `fileEntries`: the first filename seen, the entry names that
      fill the `contents` and `iv` slots, and the `encrypted` mark. */
  datatype Group = Group(filename: string, contents: Option<string>, iv: Option<string>, encrypted: bool)

  /** JavaScript truthiness of an optional string slot. */
  predicate Truthy(o: Option<string>) {
    o.Some? && o.value != ""
  }

  /** The variables of the first loop: `fileEntries` and `decryptionKey`. */
  datatype Scanned = Scanned(groups: Record<Group>, key: Option<seq<byte>>)

  /** `crypto.privateDecrypt` with the unlocked private key (RSA-OAEP, section
      7.1 of RFC 8017): the content key, or the message of the exception. */
  type Unwrap = seq<byte> -> Result<seq<byte>, string>

  /** AES-256-GCM decryption (NIST SP 800-38D) of a ciphertext under
      `decryptionKey`, an IV and the tag: the plaintext, or the message of the
      exception `update`/`final` throw. */
  type Decipher = (Option<seq<byte>>, seq<byte>, seq<byte>, seq<byte>) -> Result<seq<byte>, string>

  /** One iteration of the loop at bin/fetch-log.ts:95-117. */
  function ScanStep(reading: Reading, encrypted: bool, unwrap: Unwrap, st: Scanned, name: string, item: ZipItem): Result<Scanned, Exit> {
    if item.isDirectory then Ok(st)
    else
      var filename := FilenameOf(name);
      var t := TypeOf(reading, name);
      if t != "" && !encrypted then Err(Fatal("unexpected " + t + " file in non-encrypted log"))
      else if t == "key" then
        match unwrap(item.data)
        case Err(message) => Err(Thrown(message))
        case Ok(k) => Ok(Scanned(st.groups, Some(k)))
      else
        var g := Lower(filename);
        var f := match Lookup(st.groups, g) case Some(f) => f case None => Group(filename, None, None, false);
        var f' := if t == "iv" then f.(iv := Some(name)) else f.(contents := Some(name));
        var f'' := if t != "" then f'.(encrypted := true) else f';
        Ok(Scanned(Put(st.groups, g, f''), st.key))
  }

  /** The first loop over the entries in order; it stops at the first exit. */
  function Scan(reading: Reading, encrypted: bool, unwrap: Unwrap, entries: Archive): Result<Scanned, Exit> {
    if |entries| == 0 then Ok(Scanned([], None))
    else
      match Scan(reading, encrypted, unwrap, entries[..|entries| - 1])
      case Err(e) => Err(e)
      case Ok(st) => ScanStep(reading, encrypted, unwrap, st, entries[|entries| - 1].0, entries[|entries| - 1].1)
  }

  /** Once an exit is reached the later entries are never looked at. */
  lemma {:induction false} ScanStops(reading: Reading, encrypted: bool, unwrap: Unwrap, entries: Archive, k: nat)
    requires k <= |entries|
    requires Scan(reading, encrypted, unwrap, entries[..k]).Err?
    ensures Scan(reading, encrypted, unwrap, entries) == Scan(reading, encrypted, unwrap, entries[..k])
    decreases |entries| - k
  {
    if k < |entries| {
      assert entries[..k + 1][..k] == entries[..k];
      ScanStops(reading, encrypted, unwrap, entries, k + 1);
    } else {
      assert entries[..k] == entries;
    }
  }

  /** The loop of bin/fetch-log.ts:93-117, updating `fileEntries` and
      `decryptionKey` entry by entry. */
  method ScanEntries(reading: Reading, encrypted: bool, unwrap: Unwrap, entries: Archive)
    returns (r: Result<Scanned, Exit>)
    ensures r == Scan(reading, encrypted, unwrap, entries)
  {
    var decryptionKey: Option<seq<byte>> := None;
    var fileEntries: Record<Group> := [];
    for i := 0 to |entries|
      invariant Scan(reading, encrypted, unwrap, entries[..i]) == Ok(Scanned(fileEntries, decryptionKey))
    {
      assert entries[..i + 1][..i] == entries[..i];
      var (name, item) := entries[i];
      if item.isDirectory {
        continue;
      }
      var filename := FilenameOf(name);
      var t := TypeOf(reading, name);
      if t != "" && !encrypted {
        ScanStops(reading, encrypted, unwrap, entries, i + 1);
        return Err(Fatal("unexpected " + t + " file in non-encrypted log"));
      }
      if t == "key" {
        var k := unwrap(item.data);
        if k.Err? {
          ScanStops(reading, encrypted, unwrap, entries, i + 1);
          return Err(Thrown(k.error));
        }
        decryptionKey := Some(k.value);
      } else {
        var g := Lower(filename);
        var f: Group;
        var found := Lookup(fileEntries, g);
        if found.Some? {
          f := found.value;
        } else {
          f := Group(filename, None, None, false);
        }
        if t == "iv" {
          f := f.(iv := Some(name));
        } else {
          f := f.(contents := Some(name));
        }
        if t != "" {
          f := f.(encrypted := true);
        }
        fileEntries := Put(fileEntries, g, f);
      }
    }
    assert entries[..|entries|] == entries;
    r := Ok(Scanned(fileEntries, decryptionKey));
  }

  /** `zipfile.entryData(name)`. */
  function EntryData(entries: Archive, name: string): Result<seq<byte>, string> {
    match Lookup(entries, name)
    case None => Err("Entry not found")
    case Some(item) => Ok(item.data)
  }

  /** `data.slice(-16)`: the GCM authentication tag. */
  function Tag(data: seq<byte>): seq<byte> {
    if |data| >= 16 then data[|data| - 16..] else data
  }

  /** `data.slice(0, -16)`: the ciphertext before the tag. */
  function Ciphertext(data: seq<byte>): seq<byte> {
    if |data| >= 16 then data[..|data| - 16] else []
  }

  /** The tag is the last sixteen bytes (all of them for shorter data) and the
      ciphertext everything before it. */
  lemma TagSplit(data: seq<byte>)
    ensures Ciphertext(data) + Tag(data) == data
    ensures |Tag(data)| == if |data| < 16 then |data| else 16
  {
  }

  /** A file `writeFileSync` writes. */
  datatype Written = Written(target: string, data: seq<byte>)

  /** One iteration of the loop at bin/fetch-log.ts:121-140. */
  function GroupStep(entries: Archive, key: Option<seq<byte>>, decipher: Decipher, f: Group): Result<Written, Exit> {
    if !Truthy(f.contents) then Err(Fatal("no contents for " + f.filename))
    else if f.encrypted && !Truthy(f.iv) then Err(Fatal("no iv for " + f.filename))
    else
      match EntryData(entries, f.contents.value)
      case Err(message) => Err(Thrown(message))
      case Ok(data) =>
        var target := "logs/" + f.filename;
        if Truthy(f.iv) then
          match EntryData(entries, f.iv.value)
          case Err(message) => Err(Thrown(message))
          case Ok(iv) =>
            match decipher(key, iv, Ciphertext(data), Tag(data))
            case Err(message) => Err(Thrown(message))
            case Ok(plain) => Ok(Written(target, plain))
        else Ok(Written(target, data))
  }

  /** The files written so far and how the loop ended. */
  datatype Progress = Progress(writes: seq<Written>, exit: Exit)

  /** The second loop over the groups in insertion order; files written
      before an exit stay written. */
  function Extract(entries: Archive, key: Option<seq<byte>>, decipher: Decipher, groups: Record<Group>): Progress {
    if |groups| == 0 then Progress([], Done)
    else
      var p := Extract(entries, key, decipher, groups[..|groups| - 1]);
      if p.exit != Done then p
      else
        match GroupStep(entries, key, decipher, groups[|groups| - 1].1)
        case Err(e) => Progress(p.writes, e)
        case Ok(w) => Progress(p.writes + [w], Done)
  }

  /** Once a group ends the run the later groups are never looked at. */
  lemma {:induction false} ExtractStops(entries: Archive, key: Option<seq<byte>>, decipher: Decipher, groups: Record<Group>, k: nat)
    requires k <= |groups|
    requires Extract(entries, key, decipher, groups[..k]).exit != Done
    ensures Extract(entries, key, decipher, groups) == Extract(entries, key, decipher, groups[..k])
    decreases |groups| - k
  {
    if k < |groups| {
      assert groups[..k + 1][..k] == groups[..k];
      ExtractStops(entries, key, decipher, groups, k + 1);
    } else {
      assert groups[..k] == groups;
    }
  }

  /** The loop of bin/fetch-log.ts:121-140. */
  method ExtractGroups(entries: Archive, key: Option<seq<byte>>, decipher: Decipher, groups: Record<Group>)
    returns (p: Progress)
    ensures p == Extract(entries, key, decipher, groups)
  {
    var writes: seq<Written> := [];
    for i := 0 to |groups|
      invariant Extract(entries, key, decipher, groups[..i]) == Progress(writes, Done)
    {
      assert groups[..i + 1][..i] == groups[..i];
      var entry := groups[i].1;
      var w := GroupStep(entries, key, decipher, entry);
      if w.Err? {
        ExtractStops(entries, key, decipher, groups, i + 1);
        return Progress(writes, w.error);
      }
      writes := writes + [w.value];
    }
    assert groups[..|groups|] == groups;
    p := Progress(writes, Done);
  }

  /** What `fetch` and the download stream deliver: a response that is not
      ok, an exception, or the saved archive. */
  datatype Download = NotOk(statusText: string) | Failed(message: string) | Saved(entries: Archive)

  /** The end of a run: the files written, how it ended, and whether the
      downloaded `logs/<key>.zip` is left behind. */
  datatype Outcome = Outcome(writes: seq<Written>, exit: Exit, zipLeft: bool)

  /** `main()` (bin/fetch-log.ts:67-145). `oops` ends the process inside the
      `try`, so the `finally` that removes the zip runs only on a normal end
      or an exception. */
  function Program(opts: Options, reading: Reading, download: Download, unwrap: Unwrap, decipher: Decipher): Outcome {
    match download
    case NotOk(statusText) => Outcome([], Fatal("Failed to download: " + statusText), false)
    case Failed(message) => Outcome([], Thrown(message), false)
    case Saved(entries) =>
      match Scan(reading, opts.encrypted, unwrap, entries)
      case Err(e) => Outcome([], e, e.Fatal?)
      case Ok(st) =>
        if opts.encrypted && st.key.None? then Outcome([], Fatal("no key file found"), true)
        else
          var p := Extract(entries, st.key, decipher, st.groups);
          Outcome(p.writes, p.exit, p.exit.Fatal?)
  }

  /** The whole script for one command line. */
  function Run(args: seq<string>, privatePath: string, fileExists: string -> bool, reading: Reading,
               download: Download, unwrap: Unwrap, decipher: Decipher): Outcome {
    match Setup(args, privatePath, fileExists)
    case Err(message) => Outcome([], Fatal(message), false)
    case Ok(opts) => Program(opts, reading, download, unwrap, decipher)
  }

  /** The script as it runs: setup, the two loops, the final checks. */
  method Fetch(args: seq<string>, privatePath: string, fileExists: string -> bool, reading: Reading,
                      download: Download, unwrap: Unwrap, decipher: Decipher)
    returns (out: Outcome)
    ensures out == Run(args, privatePath, fileExists, reading, download, unwrap, decipher)
  {
    var setup := Setup(args, privatePath, fileExists);
    if setup.Err? {
      return Outcome([], Fatal(setup.error), false);
    }
    var opts := setup.value;
    match download {
      case NotOk(statusText) =>
        out := Outcome([], Fatal("Failed to download: " + statusText), false);
      case Failed(message) =>
        out := Outcome([], Thrown(message), false);
      case Saved(entries) =>
        var scanned := ScanEntries(reading, opts.encrypted, unwrap, entries);
        if scanned.Err? {
          return Outcome([], scanned.error, scanned.error.Fatal?);
        }
        if opts.encrypted && scanned.value.key.None? {
          return Outcome([], Fatal("no key file found"), true);
        }
        var p := ExtractGroups(entries, scanned.value.key, decipher, scanned.value.groups);
        out := Outcome(p.writes, p.exit, p.exit.Fatal?);
    }
  }

  /** An entry the first loop gets past: no suffix in a plain log, and a key
      entry the private key unwraps. */
  predicate EntryAdmissible(reading: Reading, encrypted: bool, unwrap: Unwrap, name: string, item: ZipItem) {
    !item.isDirectory ==>
      && (TypeOf(reading, name) != "" ==> encrypted)
      && (TypeOf(reading, name) == "key" ==> unwrap(item.data).Ok?)
  }

  predicate Admissible(reading: Reading, encrypted: bool, unwrap: Unwrap, entries: Archive) {
    forall i :: 0 <= i < |entries| ==> EntryAdmissible(reading, encrypted, unwrap, entries[i].0, entries[i].1)
  }

  /** The first loop gets through exactly when every entry is admissible; the
      exit it takes otherwise is that of the first entry that is not. */
  lemma {:induction false} ScanOk(reading: Reading, encrypted: bool, unwrap: Unwrap, entries: Archive)
    ensures Scan(reading, encrypted, unwrap, entries).Ok? <==> Admissible(reading, encrypted, unwrap, entries)
  {
    if |entries| > 0 {
      var init := entries[..|entries| - 1];
      var last := entries[|entries| - 1];
      ScanOk(reading, encrypted, unwrap, init);
      AdmissibleSnoc(reading, encrypted, unwrap, entries);
      var s := Scan(reading, encrypted, unwrap, init);
      if s.Ok? {
        StepOk(reading, encrypted, unwrap, s.value, last.0, last.1);
      }
    }
  }

  /** One entry gets past the loop exactly when it is admissible. */
  lemma StepOk(reading: Reading, encrypted: bool, unwrap: Unwrap, st: Scanned, name: string, item: ZipItem)
    ensures ScanStep(reading, encrypted, unwrap, st, name, item).Ok? <==> EntryAdmissible(reading, encrypted, unwrap, name, item)
  {
  }

  /** All entries are admissible when all but the last are and the last is. */
  lemma AdmissibleSnoc(reading: Reading, encrypted: bool, unwrap: Unwrap, entries: Archive)
    requires |entries| > 0
    ensures var init, last := entries[..|entries| - 1], entries[|entries| - 1];
      Admissible(reading, encrypted, unwrap, entries) <==>
        Admissible(reading, encrypted, unwrap, init) && EntryAdmissible(reading, encrypted, unwrap, last.0, last.1)
  {
    var init, last := entries[..|entries| - 1], entries[|entries| - 1];
    if Admissible(reading, encrypted, unwrap, entries) {
      forall i | 0 <= i < |init| ensures EntryAdmissible(reading, encrypted, unwrap, init[i].0, init[i].1) {
        assert init[i] == entries[i];
      }
    }
    if Admissible(reading, encrypted, unwrap, init) && EntryAdmissible(reading, encrypted, unwrap, last.0, last.1) {
      forall i | 0 <= i < |entries| ensures EntryAdmissible(reading, encrypted, unwrap, entries[i].0, entries[i].1) {
        if i < |init| {
          assert entries[i] == init[i];
        }
      }
    }
  }

  /** The first entry that is not admissible decides the exit: a fatal
      message for a suffix in a plain log, the exception of a failed unwrap. */
  lemma ScanFirstFailure(reading: Reading, encrypted: bool, unwrap: Unwrap, entries: Archive, k: nat)
    requires k < |entries|
    requires Admissible(reading, encrypted, unwrap, entries[..k])
    requires !EntryAdmissible(reading, encrypted, unwrap, entries[k].0, entries[k].1)
    ensures var t := TypeOf(reading, entries[k].0);
      Scan(reading, encrypted, unwrap, entries)
        == if !encrypted then Err(Fatal("unexpected " + t + " file in non-encrypted log"))
           else Err(Thrown(unwrap(entries[k].1.data).error))
  {
    ScanOk(reading, encrypted, unwrap, entries[..k]);
    assert entries[..k + 1][..k] == entries[..k];
    ScanStops(reading, encrypted, unwrap, entries, k + 1);
  }

  /** What one entry contributes to the first loop: nothing (a directory),
      a content key (or the exception unwrapping it), or a part of group
      `group` filling the `iv` slot or the `contents` slot, typed or not. */
  datatype Kind =
    | Skipped
    | KeyFile(unwrapped: Result<seq<byte>, string>)
    | Part(group: string, filename: string, name: string, slotIv: bool, typed: bool)

  function KindOf(reading: Reading, unwrap: Unwrap, name: string, item: ZipItem): Kind {
    if item.isDirectory then Skipped
    else
      var t := TypeOf(reading, name);
      if t == "key" then KeyFile(unwrap(item.data))
      else Part(GroupKey(name), FilenameOf(name), name, t == "iv", t != "")
  }

  function Kinds(reading: Reading, unwrap: Unwrap, entries: Archive): (ks: seq<Kind>)
    ensures |ks| == |entries|
    ensures forall i :: 0 <= i < |entries| ==> ks[i] == KindOf(reading, unwrap, entries[i].0, entries[i].1)
  {
    seq(|entries|, i requires 0 <= i < |entries| => KindOf(reading, unwrap, entries[i].0, entries[i].1))
  }

  /** The state after one admissible entry, by its kind. */
  function Apply(st: Scanned, kind: Kind): Scanned
    requires kind.KeyFile? ==> kind.unwrapped.Ok?
  {
    match kind
    case Skipped => st
    case KeyFile(k) => Scanned(st.groups, Some(k.value))
    case Part(g, filename, name, slotIv, typed) =>
      var f := match Lookup(st.groups, g) case Some(f) => f case None => Group(filename, None, None, false);
      var f' := if slotIv then f.(iv := Some(name)) else f.(contents := Some(name));
      var f'' := if typed then f'.(encrypted := true) else f';
      Scanned(Put(st.groups, g, f''), st.key)
  }

  lemma StepByKind(reading: Reading, encrypted: bool, unwrap: Unwrap, st: Scanned, name: string, item: ZipItem)
    requires EntryAdmissible(reading, encrypted, unwrap, name, item)
    ensures KindOf(reading, unwrap, name, item).KeyFile? ==> KindOf(reading, unwrap, name, item).unwrapped.Ok?
    ensures ScanStep(reading, encrypted, unwrap, st, name, item) == Ok(Apply(st, KindOf(reading, unwrap, name, item)))
  {
  }

  /** Entry `i` joins group `g`. */
  predicate Member(kinds: seq<Kind>, i: nat, g: string) {
    i < |kinds| && kinds[i].Part? && kinds[i].group == g
  }

  /** Entry `i` of group `g` fills the `iv` slot (`iv`) or the `contents` slot. */
  predicate Fills(kinds: seq<Kind>, i: nat, g: string, iv: bool) {
    Member(kinds, i, g) && kinds[i].slotIv == iv
  }

  /** Entry `i` of group `g` marks it encrypted. */
  predicate Marks(kinds: seq<Kind>, i: nat, g: string) {
    Member(kinds, i, g) && kinds[i].typed
  }

  /** Entry `i` is a key entry. */
  predicate KeyAt(kinds: seq<Kind>, i: nat) {
    i < |kinds| && kinds[i].KeyFile?
  }

  /** Group `g` after the first `k` entries: its filename is that of one of
      its entries; a slot is set exactly when an entry for it was met, and it
      names such an entry; the mark is set exactly when a typed entry was met. */
  ghost predicate GroupDescribed(kinds: seq<Kind>, k: nat, g: string, f: Group) {
    && (exists i :: 0 <= i < k && Member(kinds, i, g) && f.filename == kinds[i].filename)
    && (f.contents.Some? <==> exists i :: 0 <= i < k && Fills(kinds, i, g, false))
    && (f.contents.Some? ==> exists i :: 0 <= i < k && Fills(kinds, i, g, false) && kinds[i].name == f.contents.value)
    && (f.iv.Some? <==> exists i :: 0 <= i < k && Fills(kinds, i, g, true))
    && (f.iv.Some? ==> exists i :: 0 <= i < k && Fills(kinds, i, g, true) && kinds[i].name == f.iv.value)
    && (f.encrypted <==> exists i :: 0 <= i < k && Marks(kinds, i, g))
  }

  /** The state of the first loop after `k` entries, independently of their
      order: one group per group key met, each described as above, and the
      key set exactly when a key entry was met, to what one of them unwraps to. */
  ghost predicate Describes(kinds: seq<Kind>, k: nat, st: Scanned) {
    && k <= |kinds|
    && UniqueKeys(st.groups)
    && (forall g :: g in Keys(st.groups) <==> exists i :: 0 <= i < k && Member(kinds, i, g))
    && (forall g :: g in Keys(st.groups) ==> GroupDescribed(kinds, k, g, Lookup(st.groups, g).value))
    && (st.key.Some? <==> exists i :: 0 <= i < k && KeyAt(kinds, i))
    && (st.key.Some? ==> exists i :: 0 <= i < k && KeyAt(kinds, i) && kinds[i].unwrapped == Ok(st.key.value))
  }

  /** What the first loop builds from admissible entries. */
  lemma {:induction false} ScanDescribed(reading: Reading, encrypted: bool, unwrap: Unwrap, entries: Archive, k: nat)
    requires k <= |entries|
    requires Admissible(reading, encrypted, unwrap, entries)
    ensures Scan(reading, encrypted, unwrap, entries[..k]).Ok?
    ensures Describes(Kinds(reading, unwrap, entries), k, Scan(reading, encrypted, unwrap, entries[..k]).value)
  {
    var kinds := Kinds(reading, unwrap, entries);
    if k > 0 {
      ScanDescribed(reading, encrypted, unwrap, entries, k - 1);
      assert entries[..k][..k - 1] == entries[..k - 1];
      var st := Scan(reading, encrypted, unwrap, entries[..k - 1]).value;
      assert EntryAdmissible(reading, encrypted, unwrap, entries[k - 1].0, entries[k - 1].1);
      StepByKind(reading, encrypted, unwrap, st, entries[k - 1].0, entries[k - 1].1);
      ApplyDescribed(kinds, k - 1, st);
    } else {
      assert Scan(reading, encrypted, unwrap, entries[..0]) == Ok(Scanned([], None));
    }
  }

  lemma ApplyDescribed(kinds: seq<Kind>, k: nat, st: Scanned)
    requires k < |kinds|
    requires Describes(kinds, k, st)
    requires kinds[k].KeyFile? ==> kinds[k].unwrapped.Ok?
    ensures Describes(kinds, k + 1, Apply(st, kinds[k]))
  {
    var st' := Apply(st, kinds[k]);
    if !kinds[k].Part? {
      forall g ensures g in Keys(st.groups) <==> exists i :: 0 <= i < k + 1 && Member(kinds, i, g) {
        assert !Member(kinds, k, g);
      }
      forall g | g in Keys(st.groups) ensures GroupDescribed(kinds, k + 1, g, Lookup(st.groups, g).value) {
        GroupUnchanged(kinds, k, g, Lookup(st.groups, g).value);
      }
      if kinds[k].KeyFile? {
        assert KeyAt(kinds, k);
      }
    } else {
      var Part(g0, filename, name, slotIv, typed) := kinds[k];
      var f := match Lookup(st.groups, g0) case Some(f) => f case None => Group(filename, None, None, false);
      var f' := if slotIv then f.(iv := Some(name)) else f.(contents := Some(name));
      var f'' := if typed then f'.(encrypted := true) else f';
      assert st' == Scanned(Put(st.groups, g0, f''), st.key);
      PutSpec(st.groups, g0, f'');
      assert Member(kinds, k, g0);
      assert !KeyAt(kinds, k);
      forall g ensures g in Keys(st'.groups) <==> exists i :: 0 <= i < k + 1 && Member(kinds, i, g) {
        assert g in Keys(st'.groups) <==> Lookup(st'.groups, g).Some?;
        assert g in Keys(st.groups) <==> Lookup(st.groups, g).Some?;
        if g != g0 {
          assert !Member(kinds, k, g);
        }
      }
      forall g | g in Keys(st'.groups) ensures GroupDescribed(kinds, k + 1, g, Lookup(st'.groups, g).value) {
        if g != g0 {
          assert Lookup(st'.groups, g) == Lookup(st.groups, g);
          assert g in Keys(st.groups) <==> Lookup(st.groups, g).Some?;
          GroupUnchanged(kinds, k, g, Lookup(st.groups, g).value);
        } else {
          assert g0 in Keys(st.groups) <==> Lookup(st.groups, g0).Some?;
          GroupJoined(kinds, k, g0, Lookup(st.groups, g0), f'');
        }
      }
    }
  }

  /** A group the next entry does not join is described as before. */
  lemma GroupUnchanged(kinds: seq<Kind>, k: nat, g: string, f: Group)
    requires k < |kinds|
    requires GroupDescribed(kinds, k, g, f)
    requires !Member(kinds, k, g)
    ensures GroupDescribed(kinds, k + 1, g, f)
  {
    var i :| 0 <= i < k && Member(kinds, i, g) && f.filename == kinds[i].filename;
    assert i < k + 1;
    if f.contents.Some? {
      var j :| 0 <= j < k && Fills(kinds, j, g, false) && kinds[j].name == f.contents.value;
      assert j < k + 1;
    }
    if f.iv.Some? {
      var j :| 0 <= j < k && Fills(kinds, j, g, true) && kinds[j].name == f.iv.value;
      assert j < k + 1;
    }
  }

  /** The group the next entry joins, created or updated as lines 113-115 do. */
  lemma GroupJoined(kinds: seq<Kind>, k: nat, g: string, old': Option<Group>, f'': Group)
    requires k < |kinds| && Member(kinds, k, g)
    requires old'.Some? ==> GroupDescribed(kinds, k, g, old'.value)
    requires old'.None? ==> !exists i :: 0 <= i < k && Member(kinds, i, g)
    requires var Part(_, filename, name, slotIv, typed) := kinds[k];
      var f := if old'.Some? then old'.value else Group(filename, None, None, false);
      var f' := if slotIv then f.(iv := Some(name)) else f.(contents := Some(name));
      f'' == if typed then f'.(encrypted := true) else f'
    ensures GroupDescribed(kinds, k + 1, g, f'')
  {
    var Part(_, filename, name, slotIv, typed) := kinds[k];
    if old'.Some? {
      var f := old'.value;
      var i :| 0 <= i < k && Member(kinds, i, g) && f.filename == kinds[i].filename;
      assert i < k + 1;
      if f.contents.Some? {
        var j :| 0 <= j < k && Fills(kinds, j, g, false) && kinds[j].name == f.contents.value;
        assert j < k + 1;
      }
      if f.iv.Some? {
        var j :| 0 <= j < k && Fills(kinds, j, g, true) && kinds[j].name == f.iv.value;
        assert j < k + 1;
      }
      assert Fills(kinds, k, g, slotIv);
      if typed {
        assert Marks(kinds, k, g);
      }
      forall j | 0 <= j < k + 1 && Fills(kinds, j, g, false) ensures f''.contents.Some? {
        if j < k {
          assert f.contents.Some?;
        }
      }
      forall j | 0 <= j < k + 1 && Fills(kinds, j, g, true) ensures f''.iv.Some? {
        if j < k {
          assert f.iv.Some?;
        }
      }
      forall j | 0 <= j < k + 1 && Marks(kinds, j, g) ensures f''.encrypted {
        if j < k {
          assert f.encrypted;
        }
      }
      if f''.contents.Some? && slotIv {
        var j :| 0 <= j < k && Fills(kinds, j, g, false);
        assert j < k + 1;
      }
      if f''.iv.Some? && !slotIv {
        var j :| 0 <= j < k && Fills(kinds, j, g, true);
        assert j < k + 1;
      }
      if f''.encrypted && !typed {
        var j :| 0 <= j < k && Marks(kinds, j, g);
        assert j < k + 1;
      }
    } else {
      forall j | 0 <= j < k + 1 && Member(kinds, j, g) ensures j == k {
      }
      assert Member(kinds, k, g) && kinds[k].filename == filename;
      assert Fills(kinds, k, g, slotIv);
      if typed {
        assert Marks(kinds, k, g);
      }
    }
  }

  /** When every group passes, every group is written, in insertion order. */
  lemma {:induction false} ExtractAll(entries: Archive, key: Option<seq<byte>>, decipher: Decipher, groups: Record<Group>)
    requires forall j :: 0 <= j < |groups| ==> GroupStep(entries, key, decipher, groups[j].1).Ok?
    ensures Extract(entries, key, decipher, groups).exit == Done
    ensures |Extract(entries, key, decipher, groups).writes| == |groups|
    ensures forall j :: 0 <= j < |groups| ==>
      Extract(entries, key, decipher, groups).writes[j] == GroupStep(entries, key, decipher, groups[j].1).value
  {
    if |groups| > 0 {
      var init := groups[..|groups| - 1];
      forall j | 0 <= j < |init| ensures init[j] == groups[j] {
      }
      ExtractAll(entries, key, decipher, init);
    }
  }

  /** A failing group after groups that all pass ends the run with the
      writes made so far. */
  lemma ExtractFailsAt(entries: Archive, key: Option<seq<byte>>, decipher: Decipher, groups: Record<Group>, k: nat)
    requires k < |groups|
    requires Extract(entries, key, decipher, groups[..k]).exit == Done
    requires GroupStep(entries, key, decipher, groups[k].1).Err?
    ensures Extract(entries, key, decipher, groups) ==
      Progress(Extract(entries, key, decipher, groups[..k]).writes, GroupStep(entries, key, decipher, groups[k].1).error)
  {
    var upto := groups[..k + 1];
    assert upto[..k] == groups[..k] && upto[k] == groups[k];
    ExtractStops(entries, key, decipher, groups, k + 1);
  }

  /** The first group that does not pass ends the run with its exit; the
      groups before it have been written. */
  lemma ExtractFirstFailure(entries: Archive, key: Option<seq<byte>>, decipher: Decipher, groups: Record<Group>, k: nat)
    requires k < |groups|
    requires forall j :: 0 <= j < k ==> GroupStep(entries, key, decipher, groups[j].1).Ok?
    requires GroupStep(entries, key, decipher, groups[k].1).Err?
    ensures Extract(entries, key, decipher, groups).exit == GroupStep(entries, key, decipher, groups[k].1).error
    ensures |Extract(entries, key, decipher, groups).writes| == k
    ensures forall j :: 0 <= j < k ==>
      Extract(entries, key, decipher, groups).writes[j] == GroupStep(entries, key, decipher, groups[j].1).value
  {
    var init := groups[..k];
    forall j | 0 <= j < k ensures init[j] == groups[j] {
    }
    ExtractAll(entries, key, decipher, init);
    ExtractFailsAt(entries, key, decipher, groups, k);
  }

  /** Line 122 and 123 as the guards of a group: a group without contents,
      or marked encrypted without an IV, ends the run with its fatal message. */
  lemma GroupChecks(entries: Archive, key: Option<seq<byte>>, decipher: Decipher, f: Group)
    ensures !Truthy(f.contents) ==> GroupStep(entries, key, decipher, f) == Err(Fatal("no contents for " + f.filename))
    ensures Truthy(f.contents) && f.encrypted && !Truthy(f.iv) ==> GroupStep(entries, key, decipher, f) == Err(Fatal("no iv for " + f.filename))
    ensures GroupStep(entries, key, decipher, f).Ok? ==> GroupStep(entries, key, decipher, f).value.target == "logs/" + f.filename
  {
  }

  /** As written, line 100 makes every entry untyped: the first loop always
      gets through, never meets a key entry, and every group is a plain file
      holding its last entry. */
  lemma AsWrittenScan(encrypted: bool, unwrap: Unwrap, entries: Archive)
    ensures Scan(AsWritten, encrypted, unwrap, entries).Ok?
    ensures Scan(AsWritten, encrypted, unwrap, entries).value.key.None?
    ensures forall j :: 0 <= j < |Scan(AsWritten, encrypted, unwrap, entries).value.groups| ==>
      var f := Scan(AsWritten, encrypted, unwrap, entries).value.groups[j].1;
      f.iv.None? && !f.encrypted
  {
    ScanDescribed(AsWritten, encrypted, unwrap, entries, |entries|);
    assert entries[..|entries|] == entries;
    var st := Scan(AsWritten, encrypted, unwrap, entries).value;
    var kinds := Kinds(AsWritten, unwrap, entries);
    forall i: nat, g: string | i < |entries| ensures !KeyAt(kinds, i) && !Fills(kinds, i, g, true) && !Marks(kinds, i, g) {
    }
    forall j | 0 <= j < |st.groups| ensures st.groups[j].1.iv.None? && !st.groups[j].1.encrypted {
      var g := st.groups[j].0;
      assert g in Keys(st.groups);
      PositionIs(st.groups, g, 0, j);
      assert Lookup(st.groups, g).value == st.groups[j].1;
    }
  }

  /** The consequence of line 100: every downloaded encrypted log ends at the
      check of line 119, with nothing written and the zip left behind. */
  lemma AsWrittenEncryptedFails(opts: Options, entries: Archive, unwrap: Unwrap, decipher: Decipher)
    requires opts.encrypted
    ensures Program(opts, AsWritten, Saved(entries), unwrap, decipher) == Outcome([], Fatal("no key file found"), true)
  {
    AsWrittenScan(opts.encrypted, unwrap, entries);
  }

  /** Lines 44-59 let a run go on exactly for a well-formed ID on host `0x0`,
      with the private key and `package.json` present when it is encrypted;
      the zip is `logs/<key>.zip` and the URL `https://0x0.st/<remote>.zip`. */
  lemma SetupSpec(args: seq<string>, privatePath: string, fileExists: string -> bool)
    ensures Setup(args, privatePath, fileExists).Ok? <==>
      && |args| > 0 && LogId.Parse(args[0]).Some? && LogId.Parse(args[0]).value.host == "0x0"
      && (LogId.Encrypted(LogId.Parse(args[0]).value.tags) ==>
            privatePath != "" && fileExists(privatePath) && fileExists("package.json"))
    ensures Setup(args, privatePath, fileExists).Ok? ==>
      var p := LogId.Parse(args[0]).value;
      Setup(args, privatePath, fileExists).value
        == Options(LogId.Encrypted(p.tags), "logs/" + p.key + ".zip", "https://0x0.st/" + p.remote + ".zip", "logs/" + p.key)
  {
  }

  /** A rejected command line or a foreign host ends the run before anything
      is downloaded: the outcome does not depend on the download. */
  lemma SetupFailsEarly(args: seq<string>, privatePath: string, fileExists: string -> bool, reading: Reading,
                        download: Download, unwrap: Unwrap, decipher: Decipher)
    requires Setup(args, privatePath, fileExists).Err?
    ensures Run(args, privatePath, fileExists, reading, download, unwrap, decipher)
         == Outcome([], Fatal(Setup(args, privatePath, fileExists).error), false)
    ensures |args| > 0 && LogId.Parse(args[0]).Some? && LogId.Parse(args[0]).value.host != "0x0" ==>
      Setup(args, privatePath, fileExists).error == "Unexpected debug log host " + LogId.Parse(args[0]).value.host
  {
  }

  /** The zip is left behind exactly when the run ends with a message of
      `oops` after the download. */
  lemma ZipLeftOnlyAfterOops(opts: Options, reading: Reading, download: Download, unwrap: Unwrap, decipher: Decipher)
    ensures var o := Program(opts, reading, download, unwrap, decipher);
      o.zipLeft <==> download.Saved? && o.exit.Fatal?
  {
  }
}
