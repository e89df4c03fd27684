/** `copy-assets.ts`: copies the plugin's asset directories into `build/`,
    leaving out editor litter and the sources that the build compiles. */
module CopyAssets {
  import opened Strings
  import Paths

  function StripTrailingSlashes(p: string): (r: string)
    ensures |r| <= |p| && r == p[..|r|] && (r == "" || r[|r| - 1] != '/')
  {
    if |p| > 0 && p[|p| - 1] == '/' then StripTrailingSlashes(p[..|p| - 1]) else p
  }

  /** `path.basename`: the last component, trailing separators ignored. */
  function Basename(p: string): (b: string)
    ensures '/' !in b
  {
    var s := StripTrailingSlashes(p);
    match LastIndexOfChar(s, '/')
    case None => s
    case Some(i) => s[i + 1..]
  }

  /** `path.extname`: the last component from its last dot, except when that
      dot starts the component or the component is `..`. */
  function Extname(p: string): (e: string)
    ensures e == "" || (e[0] == '.' && '.' !in e[1..])
  {
    var b := Basename(p);
    match LastIndexOfChar(b, '.')
    case None => ""
    case Some(d) => if d == 0 || b == ".." then "" else b[d..]
  }

  /** The extensions the build compiles rather than copies. */
  const BLOCKED: set<string> := {".json", ".ts", ".peggy", ".pug"}

  /** `allow` (lines 9-24). `toLowerCase` is taken on ASCII letters: no
      other character lower-cases into one of the blocked extensions. */
  predicate Allow(file: string) {
    Basename(file) != ".DS_Store" && Lower(Extname(file)) !in BLOCKED
  }

  /** A bare file name is its own base name. */
  lemma BasenameOfName(name: string)
    requires name != "" && '/' !in name
    ensures Basename(name) == name
  {
    assert StripTrailingSlashes(name) == name;
  }

  /** The base name of a path is what follows its last separator. */
  lemma BasenameBelow(dir: string, name: string)
    requires name != "" && '/' !in name
    ensures Basename(dir + "/" + name) == name
  {
    var p := dir + "/" + name;
    assert p[|p| - 1] == name[|name| - 1];
    assert StripTrailingSlashes(p) == p;
    assert p[|dir|] == '/';
    assert p[|dir| + 1..] == name;
    LastIndexOfCharIs(p, '/', |dir|);
  }

  /** The extension of a name with a stem is its last dot onwards (`..`
      alone has none). */
  lemma ExtnameOfName(stem: string, ext: string)
    requires stem != "" && '/' !in stem && '/' !in ext && '.' !in ext
    requires stem != "." || ext != ""
    ensures Extname(stem + "." + ext) == "." + ext
  {
    var b := stem + "." + ext;
    assert '/' !in b by {
      assert forall i :: 0 <= i < |b| ==> b[i] == if i < |stem| then stem[i] else if i == |stem| then '.' else ext[i - |stem| - 1];
    }
    BasenameOfName(b);
    assert b[|stem|] == '.';
    assert b[|stem| + 1..] == ext;
    LastIndexOfCharIs(b, '.', |stem|);
    assert b != ".." by {
      if stem == "." { assert |b| > 2; } else if |stem| > 1 { assert |b| > 2; } else { assert b[0] != '.'; }
    }
    assert b[|stem|..] == "." + ext;
  }

  /** A path below a directory is judged by its file name alone. */
  lemma AllowByName(dir: string, name: string)
    requires name != "" && '/' !in name
    ensures Basename(dir + "/" + name) == name
    ensures Allow(dir + "/" + name) == Allow(name)
  {
    BasenameBelow(dir, name);
    BasenameOfName(name);
  }

  /** A file with a stem and a blocked extension, in any letter case, is
      left out; so is `.DS_Store`. */
  lemma BlockedLeftOut(stem: string, ext: string)
    requires stem != "" && '/' !in stem && '/' !in ext && '.' !in ext
    requires Lower("." + ext) in BLOCKED
    ensures !Allow(stem + "." + ext)
    ensures !Allow(".DS_Store")
  {
    ExtnameOfName(stem, ext);
    DsStoreLeftOut();
  }

  lemma DsStoreLeftOut()
    ensures !Allow(".DS_Store")
  {
    BasenameOfName(".DS_Store");
  }

  /** A name that starts with its only dot has no extension: `.json` itself
      is copied. */
  lemma DotFileAllowed()
    ensures Allow(".json")
  {
    BasenameOfName(".json");
    LastIndexOfCharIs(".json", '.', 0);
  }

  /** Anything without a dot in its name, other than `.DS_Store`, is copied. */
  lemma NoDotAllowed(name: string)
    requires name != "" && '/' !in name && '.' !in name
    ensures Allow(name)
  {
    BasenameOfName(name);
  }

  /** `shouldCopy` (lines 28-30); `present` is `fs.existsSync`. */
  predicate ShouldCopy(dir: string, present: string -> bool) {
    present(dir) && !present(Paths.JoinPath(dir, ".nomedia"))
  }

  /** The directories of line 33, in their order. */
  const DIRS: seq<string> := ["defaults", "content", "skin", "locale", "resource", "chrome.manifest", "chrome"]

  /** One `fs.copySync`: source, destination, and whether its filter
      consults `allow`. */
  datatype Job = Job(from: string, to: string, filtered: bool)

  /** The path of the entry reached from `dir` through the components
      `below`. */
  function Under(dir: string, below: seq<string>): string {
    if |below| == 0 then dir else Under(dir, below[..|below| - 1]) + "/" + below[|below| - 1]
  }

  /** Whether a job copies the entry reached through `below`. `copySync`
      asks the filter about the source itself and then about each entry it
      walks into, and does not descend into a directory the filter refuses:
      an entry is copied only when it and every directory above it, up to
      and including the source, pass. */
  predicate Copies(job: Job, below: seq<string>) {
    !job.filtered || forall k :: 0 <= k <= |below| ==> Allow(Under(job.from, below[..k]))
  }

  /** The directories above a copied entry are copied too. */
  lemma CopiesAbove(job: Job, below: seq<string>, k: nat)
    requires Copies(job, below) && k <= |below|
    ensures Copies(job, below[..k])
  {
    if job.filtered {
      forall m | 0 <= m <= k ensures Allow(Under(job.from, below[..k][..m])) {
        assert below[..k][..m] == below[..m];
      }
    }
  }

  /** A refused directory prunes its whole subtree: for example nothing
      below a directory `locale/x.json/` is copied. */
  lemma RefusedPrunes(job: Job, below: seq<string>, k: nat)
    requires job.filtered && k <= |below| && !Allow(Under(job.from, below[..k]))
    ensures !Copies(job, below)
  {
  }

  /** Below directories that are copied, a file is copied exactly when its
      own name is allowed. */
  lemma CopiesByName(job: Job, above: seq<string>, name: string)
    requires Copies(job, above) && name != "" && '/' !in name
    ensures Copies(job, above + [name]) <==> !job.filtered || Allow(name)
  {
    var below := above + [name];
    assert below[..|below| - 1] == above;
    assert Under(job.from, below) == Under(job.from, above) + "/" + name;
    AllowByName(Under(job.from, above), name);
    if job.filtered {
      assert below[..|below|] == below;
      if Allow(name) {
        AboveAllowed(job, above, below);
      }
    }
  }

  lemma AboveAllowed(job: Job, above: seq<string>, below: seq<string>)
    requires job.filtered && Copies(job, above)
    requires |below| == |above| + 1 && below[..|above|] == above && Allow(Under(job.from, below))
    ensures Copies(job, below)
  {
    forall k | 0 <= k <= |below| ensures Allow(Under(job.from, below[..k])) {
      if k <= |above| {
        assert below[..k] == above[..k];
      } else {
        assert below[..k] == below;
      }
    }
  }

  /** The job of line 36 for one joined directory. */
  function DirJob(dir: string): Job {
    Job(dir, Paths.JoinPath("build", dir), dir != "chrome.manifest" && dir != "resource")
  }

  /** The jobs of the loop of lines 33-43 over the given directories. */
  function DirJobs(dirs: seq<string>, root: string, present: string -> bool): seq<Job> {
    if |dirs| == 0 then []
    else
      var dir := Paths.JoinPath(root, dirs[|dirs| - 1]);
      DirJobs(dirs[..|dirs| - 1], root, present) + (if ShouldCopy(dir, present) then [DirJob(dir)] else [])
  }

  /** The client job of lines 45-52: unfiltered, into `build` itself. */
  function ClientJobs(present: string -> bool): seq<Job> {
    if ShouldCopy("client", present) then [Job("client", "build", false)] else []
  }

  /** `copy()`. */
  method Copy(root: string, present: string -> bool) returns (jobs: seq<Job>)
    ensures jobs == DirJobs(DIRS, root, present) + ClientJobs(present)
  {
    jobs := [];
    var i := 0;
    while i < |DIRS|
      invariant i <= |DIRS|
      invariant jobs == DirJobs(DIRS[..i], root, present)
    {
      var dir := Paths.JoinPath(root, DIRS[i]);
      DirJobsStep(DIRS, i, root, present);
      if !ShouldCopy(dir, present) {
        i := i + 1;
        continue;
      }
      jobs := jobs + [DirJob(dir)];
      i := i + 1;
    }
    assert DIRS[..i] == DIRS;
    if ShouldCopy("client", present) {
      jobs := jobs + [Job("client", "build", false)];
    }
  }

  /** One more directory adds its job when it passes `shouldCopy`. */
  lemma DirJobsStep(dirs: seq<string>, i: nat, root: string, present: string -> bool)
    requires i < |dirs|
    ensures var dir := Paths.JoinPath(root, dirs[i]);
      DirJobs(dirs[..i + 1], root, present) ==
        DirJobs(dirs[..i], root, present) + (if ShouldCopy(dir, present) then [DirJob(dir)] else [])
  {
    assert dirs[..i + 1][..i] == dirs[..i];
  }

  /** The jobs follow the directories in order, exactly one for each that
      passes `shouldCopy`: `at[k]` is the directory job `k` copies. */
  lemma {:induction false} DirJobsSpec(dirs: seq<string>, root: string, present: string -> bool) returns (at: seq<nat>)
    ensures |at| == |DirJobs(dirs, root, present)|
    ensures forall k :: 0 <= k < |at| ==> (at[k] < |dirs|
      && DirJobs(dirs, root, present)[k] == DirJob(Paths.JoinPath(root, dirs[at[k]]))
      && ShouldCopy(Paths.JoinPath(root, dirs[at[k]]), present))
    ensures forall k, l :: 0 <= k < l < |at| ==> at[k] < at[l]
    ensures forall n :: 0 <= n < |dirs| && ShouldCopy(Paths.JoinPath(root, dirs[n]), present) ==>
      exists k :: 0 <= k < |at| && at[k] == n
  {
    if |dirs| == 0 {
      at := [];
    } else {
      var front := dirs[..|dirs| - 1];
      var before := DirJobsSpec(front, root, present);
      var dir := Paths.JoinPath(root, dirs[|dirs| - 1]);
      var tail := if ShouldCopy(dir, present) then [|dirs| - 1] else [];
      at := before + tail;
      var prior := DirJobs(front, root, present);
      assert DirJobs(dirs, root, present) == prior + (if ShouldCopy(dir, present) then [DirJob(dir)] else []);
      JobsExtended(dirs, root, present, prior, before, at);
      OrderExtended(|dirs| - 1, before, at);
      CoverExtended(dirs, front, root, present, before, at);
    }
  }

  /** One more directory keeps each job paired with the directory it copies. */
  lemma JobsExtended(dirs: seq<string>, root: string, present: string -> bool,
                     prior: seq<Job>, before: seq<nat>, at: seq<nat>)
    requires |dirs| > 0 && |before| == |prior|
    requires forall k :: 0 <= k < |before| ==> (before[k] < |dirs[..|dirs| - 1]|
      && prior[k] == DirJob(Paths.JoinPath(root, dirs[..|dirs| - 1][before[k]]))
      && ShouldCopy(Paths.JoinPath(root, dirs[..|dirs| - 1][before[k]]), present))
    requires at == before + (if ShouldCopy(Paths.JoinPath(root, dirs[|dirs| - 1]), present) then [|dirs| - 1] else [])
    ensures var jobs := prior + (if ShouldCopy(Paths.JoinPath(root, dirs[|dirs| - 1]), present)
        then [DirJob(Paths.JoinPath(root, dirs[|dirs| - 1]))] else []);
      |at| == |jobs| && forall k :: 0 <= k < |at| ==> (at[k] < |dirs|
        && jobs[k] == DirJob(Paths.JoinPath(root, dirs[at[k]]))
        && ShouldCopy(Paths.JoinPath(root, dirs[at[k]]), present))
  {
    var dir := Paths.JoinPath(root, dirs[|dirs| - 1]);
    var jobs := prior + (if ShouldCopy(dir, present) then [DirJob(dir)] else []);
    forall k | 0 <= k < |at|
      ensures at[k] < |dirs| && jobs[k] == DirJob(Paths.JoinPath(root, dirs[at[k]]))
      ensures ShouldCopy(Paths.JoinPath(root, dirs[at[k]]), present)
    {
      if k < |before| {
        assert at[k] == before[k] && jobs[k] == prior[k];
        assert dirs[at[k]] == dirs[..|dirs| - 1][before[k]];
      }
    }
  }

  /** Appending the last index keeps the indices strictly increasing. */
  lemma OrderExtended(last: nat, before: seq<nat>, at: seq<nat>)
    requires forall k :: 0 <= k < |before| ==> before[k] < last
    requires forall k, l :: 0 <= k < l < |before| ==> before[k] < before[l]
    requires at == before || at == before + [last]
    ensures forall k, l :: 0 <= k < l < |at| ==> at[k] < at[l]
  {
  }

  /** One more directory: every copyable one still has its job. */
  lemma CoverExtended(dirs: seq<string>, front: seq<string>, root: string, present: string -> bool,
                      before: seq<nat>, at: seq<nat>)
    requires |dirs| > 0 && front == dirs[..|dirs| - 1]
    requires forall n :: 0 <= n < |front| && ShouldCopy(Paths.JoinPath(root, front[n]), present) ==>
      exists k :: 0 <= k < |before| && before[k] == n
    requires at == before + (if ShouldCopy(Paths.JoinPath(root, dirs[|dirs| - 1]), present) then [|dirs| - 1] else [])
    ensures forall n :: 0 <= n < |dirs| && ShouldCopy(Paths.JoinPath(root, dirs[n]), present) ==>
      exists k :: 0 <= k < |at| && at[k] == n
  {
    forall n | 0 <= n < |dirs| && ShouldCopy(Paths.JoinPath(root, dirs[n]), present)
      ensures exists k :: 0 <= k < |at| && at[k] == n
    {
      if n < |dirs| - 1 {
        assert dirs[n] == front[n];
        var k :| 0 <= k < |before| && before[k] == n;
        assert at[k] == n;
      } else {
        assert at[|at| - 1] == n;
      }
    }
  }

  /** The filter checks `dir`, the joined path, against the bare names: with
      any non-empty root every directory is filtered, and only with an empty
      root are `resource` and `chrome.manifest` copied whole. The client is
      never filtered. */
  lemma FilterBypass(root: string, present: string -> bool)
    ensures root != "" ==> forall j :: j in DirJobs(DIRS, root, present) ==> j.filtered
    ensures root == "" ==> forall j :: j in DirJobs(DIRS, root, present) ==>
      (!j.filtered <==> j.from == "resource" || j.from == "chrome.manifest")
    ensures forall j :: j in ClientJobs(present) ==> !j.filtered && forall below :: Copies(j, below)
  {
    var at := DirJobsSpec(DIRS, root, present);
    var jobs := DirJobs(DIRS, root, present);
    forall j | j in jobs
      ensures root != "" ==> j.filtered
      ensures root == "" ==> (!j.filtered <==> j.from == "resource" || j.from == "chrome.manifest")
    {
      var k :| 0 <= k < |jobs| && jobs[k] == j;
      var name := DIRS[at[k]];
      if root != "" {
        JoinedIsLonger(root, name);
      }
    }
  }

  lemma JoinedIsLonger(root: string, name: string)
    requires root != "" && name in DIRS
    ensures Paths.JoinPath(root, name) != "resource" && Paths.JoinPath(root, name) != "chrome.manifest"
  {
    var p := Paths.JoinPath(root, name);
    var x := if EndsWith(root, "/") then root else root + "/";
    assert p == x + name;
    assert |p| > |name| && p[|p| - |name|..] == name;
  }
}
